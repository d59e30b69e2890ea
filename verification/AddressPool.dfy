/** The WireGuard address allocator: the lowest host of the network whose text form is not in a list
    of reserved addresses that only grows. */
module AddressPool {
  import opened Wire

  /** An address as text, "a.b.c.d". */
  type Text = seq<byte>

  function Dotted(n: nat): Text {
    var q1 := n / 256;
    var q2 := q1 / 256;
    Decimal(q2 / 256) + [DOT] + (Decimal(q2 % 256) + [DOT] + (Decimal(q1 % 256) + [DOT] + Decimal(n % 256)))
  }

  lemma SplitAtDot(x: Text, r: Text, y: Text, s: Text)
    requires AllDigits(x) && AllDigits(y) && x + [DOT] + r == y + [DOT] + s
    ensures x == y && r == s
  {
    var w, v := x + [DOT] + r, y + [DOT] + s;
    assert w[|x|] == DOT && v[|y|] == DOT;
    assert forall k :: 0 <= k < |x| ==> w[k] == x[k] && IsDigit(w[k]);
    assert forall k :: 0 <= k < |y| ==> v[k] == y[k] && IsDigit(v[k]);
    assert |x| == |y|;
    assert x == w[..|x|] && y == v[..|x|];
    assert r == w[|x| + 1..] && s == v[|x| + 1..];
  }

  lemma DecimalInjective(m: nat, n: nat)
    requires Decimal(m) == Decimal(n)
    ensures m == n
  {
  }

  /** Two hosts never share a text form, so comparing texts compares hosts. */
  lemma DottedInjective(m: nat, n: nat)
    requires Dotted(m) == Dotted(n)
    ensures m == n
  {
    hide Decimal;
    var p1, q1 := m / 256, n / 256;
    var p2, q2 := p1 / 256, q1 / 256;
    var rm := Decimal(p1 % 256) + [DOT] + Decimal(m % 256);
    var rn := Decimal(q1 % 256) + [DOT] + Decimal(n % 256);
    SplitAtDot(Decimal(p2 / 256), Decimal(p2 % 256) + [DOT] + rm, Decimal(q2 / 256), Decimal(q2 % 256) + [DOT] + rn);
    SplitAtDot(Decimal(p2 % 256), rm, Decimal(q2 % 256), rn);
    SplitAtDot(Decimal(p1 % 256), Decimal(m % 256), Decimal(q1 % 256), Decimal(n % 256));
    DecimalInjective(p2 / 256, q2 / 256);
    DecimalInjective(p2 % 256, q2 % 256);
    DecimalInjective(p1 % 256, q1 % 256);
    DecimalInjective(m % 256, n % 256);
  }

  lemma DifferentTexts(m: nat, n: nat)
    requires m != n
    ensures Dotted(m) != Dotted(n)
  {
    if Dotted(m) == Dotted(n) {
      DottedInjective(m, n);
    }
  }

  /** A network of at least two addresses: its lowest address and its number of addresses. */
  datatype Net = Net(base: nat, size: nat)

  /** The lowest and one past the highest host.  Network and broadcast addresses are no hosts, except
      that both addresses of a two-address network are. */
  function FirstHost(net: Net): nat {
    if net.size <= 2 then net.base else net.base + 1
  }

  function EndHost(net: Net): nat
    requires net.size >= 2
  {
    if net.size == 2 then net.base + 2 else net.base + net.size - 1
  }

  /** The second address of the network; the server takes it. */
  function ServerIp(net: Net): Text {
    Dotted(net.base + 1)
  }

  datatype Allocation = Exhausted | Host(h: nat)

  /** The lowest host from `h` on that is not reserved. */
  function LowestFree(net: Net, reserved: seq<Text>, h: nat): (r: Allocation)
    requires net.size >= 2 && FirstHost(net) <= h <= EndHost(net)
    ensures r.Host? ==> h <= r.h < EndHost(net) && Dotted(r.h) !in reserved
    ensures forall k :: h <= k < (if r.Host? then r.h else EndHost(net)) ==> Dotted(k) in reserved
    decreases EndHost(net) - h
  {
    if h == EndHost(net) then Exhausted
    else if Dotted(h) !in reserved then Host(h)
    else LowestFree(net, reserved, h + 1)
  }

  function Next(net: Net, reserved: seq<Text>): Allocation
    requires net.size >= 2
  {
    LowestFree(net, reserved, FirstHost(net))
  }

  class Wg {
    const net: Net
    var reserved: seq<Text>

    constructor (net: Net)
      requires net.size >= 2
      ensures this.net == net && reserved == [ServerIp(net)]
    {
      this.net := net;
      reserved := [ServerIp(net)];
    }

    /** `init_peers` reserves the addresses already stored for the peers of a table. */
    method Extend(stored: seq<Text>)
      modifies this`reserved
      ensures reserved == old(reserved) + stored
    {
      reserved := reserved + stored;
    }

    /** The generator raises when every host is reserved. */
    method GenClientIp() returns (r: Allocation)
      requires net.size >= 2
      modifies this`reserved
      ensures r == Next(net, old(reserved))
      ensures reserved == if r.Host? then old(reserved) + [Dotted(r.h)] else old(reserved)
    {
      hide Dotted;
      var host := FirstHost(net);
      while host < EndHost(net)
        invariant FirstHost(net) <= host <= EndHost(net)
        invariant LowestFree(net, reserved, host) == Next(net, reserved)
      {
        if Dotted(host) !in reserved {
          reserved := reserved + [Dotted(host)];
          return Host(host);
        }
        host := host + 1;
      }
      return Exhausted;
    }
  }

  // ---------- Runs of the allocator ----------

  datatype Op = Reserve(stored: seq<Text>) | Gen

  function Reserved(net: Net, reserved: seq<Text>, op: Op): seq<Text>
    requires net.size >= 2
  {
    match op
    case Reserve(stored) => reserved + stored
    case Gen =>
      var r := Next(net, reserved);
      if r.Host? then reserved + [Dotted(r.h)] else reserved
  }

  /** The hosts handed out by a run, in order. */
  function Handed(net: Net, reserved: seq<Text>, ops: seq<Op>): seq<nat>
    requires net.size >= 2
    decreases |ops|
  {
    if ops == [] then []
    else
      (if ops[0].Gen? && Next(net, reserved).Host? then [Next(net, reserved).h] else [])
      + Handed(net, Reserved(net, reserved, ops[0]), ops[1..])
  }

  predicate Increasing(hs: seq<nat>) {
    forall i, j :: 0 <= i < j < |hs| ==> hs[i] < hs[j]
  }

  /** Hosts of the network, from `low` on, none of them reserved. */
  predicate Unreserved(net: Net, reserved: seq<Text>, hs: seq<nat>, low: nat)
    requires net.size >= 2
  {
    forall h :: h in hs ==> FirstHost(net) <= h < EndHost(net) && low <= h && Dotted(h) !in reserved
  }

  lemma IncreasingCons(h: nat, hs: seq<nat>)
    requires Increasing(hs) && forall k :: k in hs ==> h < k
    ensures Increasing([h] + hs)
  {
    var all := [h] + hs;
    forall i, j | 0 <= i < j < |all| ensures all[i] < all[j] {
      assert all[j] == hs[j - 1] && hs[j - 1] in hs;
    }
  }

  /** The generated addresses of any run, whatever is reserved in between, strictly increase; each is a
      host of the network and none was reserved when the run began. */
  lemma {:induction false} HandedOutInOrder(net: Net, reserved: seq<Text>, ops: seq<Op>, low: nat)
    requires net.size >= 2 && low <= EndHost(net)
    requires forall k :: FirstHost(net) <= k < low ==> Dotted(k) in reserved
    ensures Increasing(Handed(net, reserved, ops)) && Unreserved(net, reserved, Handed(net, reserved, ops), low)
    decreases |ops|
  {
    hide Dotted;
    if ops != [] {
      var more := Reserved(net, reserved, ops[0]);
      var r := Next(net, reserved);
      var rest := Handed(net, more, ops[1..]);
      assert forall t :: t in reserved ==> t in more;
      if ops[0].Gen? && r.Host? {
        HandedOutInOrder(net, more, ops[1..], r.h + 1);
        IncreasingCons(r.h, rest);
        assert low <= r.h;
      } else {
        HandedOutInOrder(net, more, ops[1..], low);
      }
    }
  }

  /** No generated address is ever the server's, or one that was reserved before its call. */
  lemma AddressesAreUnique(net: Net, before: seq<Op>, after: seq<Op>)
    requires net.size >= 2
    ensures var reserved := ReservedAfter(net, [ServerIp(net)], before);
            var hs := Handed(net, reserved, after);
            && Increasing(hs) && Unreserved(net, reserved, hs, FirstHost(net))
            && (forall h :: h in hs ==> Dotted(h) != ServerIp(net))
            && (forall i, j :: 0 <= i < j < |hs| ==> Dotted(hs[i]) != Dotted(hs[j]))
  {
    hide Dotted, Handed, ReservedAfter;
    var reserved := ReservedAfter(net, [ServerIp(net)], before);
    ReservedOnlyGrows(net, [ServerIp(net)], before);
    HandedOutInOrder(net, reserved, after, FirstHost(net));
    var hs := Handed(net, reserved, after);
    assert reserved[0] == [ServerIp(net)][0];
    forall i, j | 0 <= i < j < |hs| ensures Dotted(hs[i]) != Dotted(hs[j]) {
      DifferentTexts(hs[i], hs[j]);
    }
  }

  function ReservedAfter(net: Net, reserved: seq<Text>, ops: seq<Op>): seq<Text>
    requires net.size >= 2
    decreases |ops|
  {
    if ops == [] then reserved else ReservedAfter(net, Reserved(net, reserved, ops[0]), ops[1..])
  }

  lemma {:induction false} ReservedOnlyGrows(net: Net, reserved: seq<Text>, ops: seq<Op>)
    requires net.size >= 2
    ensures reserved <= ReservedAfter(net, reserved, ops)
    decreases |ops|
  {
    if ops != [] {
      ReservedOnlyGrows(net, Reserved(net, reserved, ops[0]), ops[1..]);
    }
  }

  // ---------- Exactly which addresses, and how many ----------

  function Free(net: Net, reserved: seq<Text>): set<nat>
    requires net.size >= 2
  {
    set h | FirstHost(net) <= h < EndHost(net) && Dotted(h) !in reserved
  }

  /** How many free hosts lie below h. */
  function Rank(free: set<nat>, h: nat): nat {
    |set k | k in free && k < h|
  }

  function Gens(n: nat): (ops: seq<Op>)
    ensures |ops| == n && forall i :: 0 <= i < n ==> ops[i] == Gen
  {
    seq(n, i => Gen)
  }

  lemma NextIsLowest(net: Net, reserved: seq<Text>)
    requires net.size >= 2
    ensures var r := Next(net, reserved);
            var free := Free(net, reserved);
            && (r.Exhausted? <==> free == {})
            && (r.Host? ==> r.h in free && (forall k :: k in free ==> r.h <= k)
                            && Free(net, reserved + [Dotted(r.h)]) == free - {r.h})
  {
    hide Dotted;
    var r := Next(net, reserved);
    var free := Free(net, reserved);
    assert forall k :: k in free ==> FirstHost(net) <= k < EndHost(net) && Dotted(k) !in reserved;
    if r.Host? {
      assert r.h in free;
      var more := Free(net, reserved + [Dotted(r.h)]);
      forall k ensures k in more <==> k in free - {r.h} {
        if k != r.h {
          DifferentTexts(k, r.h);
        }
      }
    }
  }

  lemma RankDrops(free: set<nat>, low: nat, h: nat)
    requires low in free && h in free && low < h
    ensures Rank(free, h) == Rank(free - {low}, h) + 1
  {
    var below := set k | k in free && k < h;
    assert (set k | k in free - {low} && k < h) == below - {low};
  }

  /** With nothing else reserved in between, n calls hand out exactly the n lowest free hosts. */
  lemma {:induction false} ExactlyTheLowest(net: Net, reserved: seq<Text>, n: nat)
    requires net.size >= 2
    ensures forall h :: h in Handed(net, reserved, Gens(n)) <==>
                          h in Free(net, reserved) && Rank(Free(net, reserved), h) < n
    decreases n
  {
    hide Dotted;
    var free := Free(net, reserved);
    var hs := Handed(net, reserved, Gens(n));
    NextIsLowest(net, reserved);
    if n > 0 {
      var r := Next(net, reserved);
      assert Gens(n)[1..] == Gens(n - 1);
      ExactlyTheLowest(net, Reserved(net, reserved, Gen), n - 1);
      if r.Host? {
        assert (set k | k in free && k < r.h) == {};
        forall h ensures h in hs <==> h in free && Rank(free, h) < n {
          if h in free && h != r.h {
            RankDrops(free, r.h, h);
          }
        }
      }
    }
  }

  /** The number of further calls that succeed is exactly the number of hosts not reserved. */
  lemma {:induction false} ExactlyAsManyAsFree(net: Net, reserved: seq<Text>, n: nat)
    requires net.size >= 2
    ensures |Handed(net, reserved, Gens(n))| ==
              if n <= |Free(net, reserved)| then n else |Free(net, reserved)|
    decreases n
  {
    hide Dotted;
    NextIsLowest(net, reserved);
    if n > 0 {
      assert Gens(n)[1..] == Gens(n - 1);
      ExactlyAsManyAsFree(net, Reserved(net, reserved, Gen), n - 1);
    }
  }

  // ---------- Which addresses are handed out ----------

  /** Neither the network's own address nor its broadcast address is ever handed out, in any run; only a
      network of two addresses uses both. */
  lemma HandedAreInside(net: Net, reserved: seq<Text>, ops: seq<Op>, h: nat)
    requires net.size >= 2 && h in Handed(net, reserved, ops)
    ensures net.size > 2 ==> net.base < h < net.base + net.size - 1
    ensures net.size == 2 ==> h == net.base || h == net.base + 1
  {
    HandedOutInOrder(net, reserved, ops, FirstHost(net));
  }

  function Interval(lo: nat, hi: nat): (r: set<nat>)
    ensures forall h :: h in r <==> lo <= h < hi
    ensures |r| == if lo < hi then hi - lo else 0
    decreases hi - lo
  {
    if lo >= hi then {} else {lo} + Interval(lo + 1, hi)
  }

  lemma FreshIsFree(net: Net)
    requires net.size >= 2
    ensures net.size > 2 ==>
              Free(net, [ServerIp(net)]) == Interval(net.base + 2, net.base + net.size - 1)
    ensures net.size == 2 ==> Free(net, [ServerIp(net)]) == {net.base}
  {
    hide Dotted;
    forall h: nat ensures Dotted(h) in [ServerIp(net)] <==> h == net.base + 1 {
      if h != net.base + 1 {
        DifferentTexts(h, net.base + 1);
      }
    }
  }

  lemma RankBelow(free: set<nat>, h: nat)
    requires h in free
    ensures Rank(free, h) < |free|
  {
    var below := set k | k in free && k < h;
    assert below <= free - {h};
    SubsetSize(below, free - {h});
  }

  lemma {:induction false} SubsetSize(a: set<nat>, b: set<nat>)
    requires a <= b
    ensures |a| <= |b|
    decreases a
  {
    if a != {} {
      var x :| x in a;
      SubsetSize(a - {x}, b - {x});
    }
  }

  /** From a fresh pool, with nothing else reserved: of a network of more than two addresses exactly
      size - 3 calls succeed, and all the addresses strictly between its ends but the server's, the
      second of the network, are handed out; of a network of two addresses, the first one. */
  lemma FreshPoolGivesAll(net: Net, n: nat)
    requires net.size >= 2
    ensures var room := if net.size == 2 then 1 else net.size - 3;
            |Handed(net, [ServerIp(net)], Gens(n))| == if n <= room then n else room
    ensures n >= net.size ==>
              forall h :: h in Handed(net, [ServerIp(net)], Gens(n)) <==>
                if net.size == 2 then h == net.base
                else net.base < h < net.base + net.size - 1 && h != net.base + 1
  {
    hide Handed, Gens, ServerIp, Rank, Free;
    var pool := [ServerIp(net)];
    FreshIsFree(net);
    ExactlyAsManyAsFree(net, pool, n);
    ExactlyTheLowest(net, pool, n);
    forall h | h in Free(net, pool) ensures Rank(Free(net, pool), h) < |Free(net, pool)| {
      RankBelow(Free(net, pool), h);
    }
  }

  /** Four numerals separated by '.' (46). */
  function Quad(a: nat, b: nat, c: nat, d: nat): Text {
    Decimal(a) + [46] + Decimal(b) + [46] + Decimal(c) + [46] + Decimal(d)
  }

  /** The text of an address: its four bytes, highest first, in decimal. */
  lemma DottedMeans(n: nat)
    requires n < 0x1_0000_0000
    ensures exists a: nat, b: nat, c: nat, d: nat ::
              && a < 256 && b < 256 && c < 256 && d < 256 && n == a * 16777216 + b * 65536 + c * 256 + d
              && Dotted(n) == Quad(a, b, c, d)
  {
    hide Decimal;
    var q1 := n / 256;
    var q2 := q1 / 256;
    var a, b, c, d := q2 / 256, q2 % 256, q1 % 256, n % 256;
    QuadIsDotted(Decimal(a), Decimal(b), Decimal(c), Decimal(d));
    assert Dotted(n) == Quad(a, b, c, d);
  }

  lemma QuadIsDotted(a: Text, b: Text, c: Text, d: Text)
    ensures a + [DOT] + (b + [DOT] + (c + [DOT] + d)) == a + [46] + b + [46] + c + [46] + d
  {
  }

  /** For instance "10.0.1.2". */
  lemma DottedText()
    ensures Dotted(0x0A00_0102) == [49, 48] + [46] + [48] + [46] + [49] + [46] + [50]
  {
    Numerals();
    hide Decimal;
    assert Dotted(0x0A00_0102) == Decimal(10) + [DOT] + (Decimal(0) + [DOT] + (Decimal(1) + [DOT] + Decimal(2)));
    hide Dotted;
    QuadIsDotted(Decimal(10), Decimal(0), Decimal(1), Decimal(2));
  }

  lemma Numerals()
    ensures Decimal(0) == [48] && Decimal(1) == [49] && Decimal(2) == [50] && Decimal(10) == [49, 48]
  {
    assert Decimal(10) == Decimal(1) + [48];
  }

  // ---------- Start-up of the two peer tables ----------

  /** What `init_peers` does to the pool for the users table: reserve the users' stored addresses, give
      each new user an address, only then reserve the addresses stored for remote VPNs, and give each
      new remote VPN an address.  The first call that finds no address ends the start-up. */
  datatype Peers = Peers(storedUsers: seq<Text>, newUsers: nat, storedRemotes: seq<Text>, newRemotes: nat)

  function UserPool(net: Net, p: Peers): seq<Text> {
    [ServerIp(net)] + p.storedUsers
  }

  function UserHosts(net: Net, p: Peers): seq<nat>
    requires net.size >= 2
  {
    Handed(net, UserPool(net, p), Gens(p.newUsers))
  }

  function RemotePool(net: Net, p: Peers): seq<Text>
    requires net.size >= 2
  {
    ReservedAfter(net, UserPool(net, p), Gens(p.newUsers)) + p.storedRemotes
  }

  /** Every new user got an address, so start-up goes on to the remote VPNs. */
  predicate UsersServed(net: Net, p: Peers)
    requires net.size >= 2
  {
    |UserHosts(net, p)| == p.newUsers
  }

  function RemoteHosts(net: Net, p: Peers): seq<nat>
    requires net.size >= 2
  {
    if UsersServed(net, p) then Handed(net, RemotePool(net, p), Gens(p.newRemotes)) else []
  }

  /** Start-up finds an address for every new peer. */
  predicate Completes(net: Net, p: Peers)
    requires net.size >= 2
  {
    UsersServed(net, p) && |RemoteHosts(net, p)| == p.newRemotes
  }

  /** Start-up reaches the remote VPNs if and only if there is a free host for each new user, and
      completes if and only if one is then left for each new remote VPN. */
  lemma StartUpCompletesIff(net: Net, p: Peers)
    requires net.size >= 2
    ensures UsersServed(net, p) <==> p.newUsers <= |Free(net, UserPool(net, p))|
    ensures Completes(net, p) <==>
            p.newUsers <= |Free(net, UserPool(net, p))| && p.newRemotes <= |Free(net, RemotePool(net, p))|
  {
    hide Handed, Free, UserPool, RemotePool, Gens;
    ExactlyAsManyAsFree(net, UserPool(net, p), p.newUsers);
    ExactlyAsManyAsFree(net, RemotePool(net, p), p.newRemotes);
  }

  lemma {:induction false} HandedAreReserved(net: Net, reserved: seq<Text>, ops: seq<Op>, h: nat)
    requires net.size >= 2 && h in Handed(net, reserved, ops)
    ensures Dotted(h) in ReservedAfter(net, reserved, ops)
    decreases |ops|
  {
    hide Dotted;
    var more := Reserved(net, reserved, ops[0]);
    if h in Handed(net, more, ops[1..]) {
      HandedAreReserved(net, more, ops[1..], h);
    } else {
      ReservedOnlyGrows(net, more, ops[1..]);
      assert Dotted(h) == more[|more| - 1] == ReservedAfter(net, reserved, ops)[|more| - 1];
    }
  }

  /** What start-up keeps apart: new users get no address of the server or of another user, new remote
      VPNs get no address of anybody.  Nothing keeps a new user from getting the stored address of a
      remote VPN: that happens exactly when such an address is one of the lowest free hosts, as many
      as there are new users. */
  lemma StartUpClashes(net: Net, p: Peers)
    requires net.size >= 2
    ensures forall h :: h in UserHosts(net, p) ==> Dotted(h) !in UserPool(net, p)
    ensures forall h :: h in RemoteHosts(net, p) ==>
              Dotted(h) !in UserPool(net, p) && Dotted(h) !in p.storedRemotes && h !in UserHosts(net, p)
    ensures (exists h :: h in UserHosts(net, p) && Dotted(h) in p.storedRemotes) <==>
            exists h :: h in Free(net, UserPool(net, p)) && Dotted(h) in p.storedRemotes
                        && Rank(Free(net, UserPool(net, p)), h) < p.newUsers
  {
    hide Dotted, Handed, ReservedAfter, Rank, UserPool, Free;
    var pool := UserPool(net, p);
    HandedOutInOrder(net, pool, Gens(p.newUsers), FirstHost(net));
    HandedOutInOrder(net, RemotePool(net, p), Gens(p.newRemotes), FirstHost(net));
    ReservedOnlyGrows(net, pool, Gens(p.newUsers));
    ExactlyTheLowest(net, pool, p.newUsers);
    forall h | h in RemoteHosts(net, p)
      ensures Dotted(h) !in pool && Dotted(h) !in p.storedRemotes && h !in UserHosts(net, p)
    {
      if h in UserHosts(net, p) {
        HandedAreReserved(net, pool, Gens(p.newUsers), h);
      }
      assert Dotted(h) !in RemotePool(net, p);
      assert pool <= RemotePool(net, p);
    }
  }

  /** It does happen: the first free host of a fresh network goes to the first new user, even if a
      remote VPN has held it since an earlier run. */
  lemma TwoPeersOneAddress()
    ensures var net := Net(0x0A00_0000, 256);
            var p := Peers([], 1, [Dotted(0x0A00_0002)], 0);
            0x0A00_0002 in UserHosts(net, p) && Dotted(0x0A00_0002) in p.storedRemotes
  {
    hide Dotted;
    var net := Net(0x0A00_0000, 256);
    var p := Peers([], 1, [Dotted(0x0A00_0002)], 0);
    DifferentTexts(0x0A00_0002, 0x0A00_0001);
    assert UserPool(net, p) == [ServerIp(net)];
    assert LowestFree(net, [ServerIp(net)], 0x0A00_0002) == Host(0x0A00_0002);
    assert Gens(1) == [Gen] && [Gen][1..] == [];
  }
}
