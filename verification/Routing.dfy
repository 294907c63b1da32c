// ip.c, lines 80-127: longest-prefix match and the next hop's MAC address.
module Routing {
  import opened Bytes
  import opened Crc32Table
  import opened Crc32

  // A routing table row (stack.h, lines 36-45). Destination and mask are in host order:
  // the code compares and masks bit by bit, so the order does not matter to it.
  datatype Route = Route(dest: bv32, gateway: seq<byte>, mask: bv32, interfaceId: nat)

  datatype ArpEntry = ArpEntry(ip: seq<byte>, mac: seq<byte>)

  datatype Option<T> = None | Some(value: T)

  // The four octets of an address as a host-order word.
  function Address(ip: seq<byte>): bv32
    requires |ip| == 4
  {
    (Word(ip[0]) << 24) | (Word(ip[1]) << 16) | (Word(ip[2]) << 8) | Word(ip[3])
  }

  function PopBits(x: bv32, k: nat): (n: nat)
    ensures n <= k
    decreases k
  {
    if k == 0 then 0 else (if Odd(x) then 1 else 0) + PopBits(x >> 1, k - 1)
  }

  // __builtin_popcount
  function PopCount(x: bv32): nat { PopBits(x, 32) }

  predicate Matches(r: Route, address: bv32) {
    address & r.mask == r.dest
  }

  // Bit k, counted from the last octet of an address.
  ghost predicate Bit(x: bv32, k: nat) {
    if k == 0 then Odd(x) else Bit(x >> 1, k - 1)
  }

  lemma AndHalves(x: bv32, y: bv32)
    ensures (x & y) >> 1 == (x >> 1) & (y >> 1)
    ensures Odd(x & y) <==> Odd(x) && Odd(y)
  {}

  lemma {:induction false} BitOfAnd(x: bv32, y: bv32, k: nat)
    ensures Bit(x & y, k) <==> Bit(x, k) && Bit(y, k)
    decreases k
  {
    hide Odd;
    AndHalves(x, y);
    if k > 0 {
      BitOfAnd(x >> 1, y >> 1, k - 1);
    }
  }

  lemma NextBit(x: bv32, j: nat)
    ensures Bit(x >> 1, j) == Bit(x, j + 1)
  {}

  lemma {:induction false} SameBits(x: bv32, y: bv32, k: nat)
    requires Fits(x, k) && Fits(y, k) && forall j: nat | j < k :: Bit(x, j) == Bit(y, j)
    ensures x == y
    decreases k
  {
    hide Odd;
    if k > 0 {
      assert Bit(x, 0) == Bit(y, 0);
      var u, v := x >> 1, y >> 1;
      forall j: nat | j < k - 1
        ensures Bit(u, j) == Bit(v, j)
      {
        NextBit(x, j);
        NextBit(y, j);
      }
      SameBits(u, v, k - 1);
      SameHalves(x, y);
    }
  }

  // The network has the address's bits under the mask, and no others.
  ghost predicate BitsMatch(dest: bv32, address: bv32, mask: bv32) {
    forall k: nat | k < 32 :: Bit(dest, k) <==> Bit(address, k) && Bit(mask, k)
  }

  lemma MatchesBits(r: Route, address: bv32)
    ensures Matches(r, address) <==> BitsMatch(r.dest, address, r.mask)
  {
    hide BitsMatch;
    AndMatches(address, r.mask);
    if BitsMatch(r.dest, address, r.mask) {
      MatchIsUnique(r.dest, address & r.mask, address, r.mask);
    }
  }

  lemma MatchIsUnique(x: bv32, y: bv32, address: bv32, mask: bv32)
    requires BitsMatch(x, address, mask) && BitsMatch(y, address, mask)
    ensures x == y
  {
    hide Bit, Fits;
    WordFits(x);
    WordFits(y);
    SameBits(x, y, 32);
  }

  lemma AndMatches(address: bv32, mask: bv32)
    ensures BitsMatch(address & mask, address, mask)
  {
    forall k: nat | k < 32
      ensures Bit(address & mask, k) <==> Bit(address, k) && Bit(mask, k)
    {
      BitOfAnd(address, mask, k);
    }
  }

  // Each octet of an address has its eight bits of the word, the first the highest.
  lemma AddressOctets(ip: seq<byte>)
    requires |ip| == 4
    ensures Address(ip) >> 24 == Word(ip[0]) && (Address(ip) >> 16) & 0xFF == Word(ip[1])
    ensures (Address(ip) >> 8) & 0xFF == Word(ip[2]) && Address(ip) & 0xFF == Word(ip[3])
  {
    hide Word;
    WordIsOctet(ip[0]);
    WordIsOctet(ip[1]);
    WordIsOctet(ip[2]);
    WordIsOctet(ip[3]);
    FourOctets(Word(ip[0]), Word(ip[1]), Word(ip[2]), Word(ip[3]));
  }

  lemma WordIsOctet(b: byte)
    ensures Word(b) <= 0xFF
  {}

  lemma FourOctets(a: bv32, b: bv32, c: bv32, d: bv32)
    requires a <= 0xFF && b <= 0xFF && c <= 0xFF && d <= 0xFF
    ensures var x := (a << 24) | (b << 16) | (c << 8) | d;
            x >> 24 == a && (x >> 16) & 0xFF == b && (x >> 8) & 0xFF == c && x & 0xFF == d
  {}

  // ---------- the choice among the first n rows ----------

  function BestRoute(routes: seq<Route>, address: bv32, n: nat): (best: int)
    requires n <= |routes|
    ensures -1 <= best < n
  {
    if n == 0 then -1
    else
      var best := BestRoute(routes, address, n - 1);
      if Matches(routes[n - 1], address)
         && PopCount(routes[n - 1].mask) > (if best == -1 then -1 else PopCount(routes[best].mask))
      then n - 1
      else best
  }

  method LongestPrefix(routes: seq<Route>, address: bv32) returns (index: int)
    ensures index == BestRoute(routes, address, |routes|)
  {
    hide PopCount, Matches;
    var lgPrefix: int := -1;
    index := -1;
    for i := 0 to |routes|
      invariant index == BestRoute(routes, address, i)
      invariant lgPrefix == if index == -1 then -1 else PopCount(routes[index].mask)
    {
      if Matches(routes[i], address) {
        var prefix := PopCount(routes[i].mask);
        if prefix > lgPrefix {
          lgPrefix := prefix;
          index := i;
        }
      }
    }
  }

  // No index exactly when nothing matches; otherwise a match with the most mask bits,
  // the first of those.
  lemma {:induction false} BestRouteIsLongest(routes: seq<Route>, address: bv32, n: nat)
    requires n <= |routes|
    ensures var b := BestRoute(routes, address, n);
            && (b == -1 <==> forall i | 0 <= i < n :: !Matches(routes[i], address))
            && (b >= 0 ==>
                  && Matches(routes[b], address)
                  && (forall i | 0 <= i < n && Matches(routes[i], address) ::
                        PopCount(routes[i].mask) <= PopCount(routes[b].mask)
                        && (i < b ==> PopCount(routes[i].mask) < PopCount(routes[b].mask))))
  {
    hide PopCount, Matches;
    if n > 0 {
      BestRouteIsLongest(routes, address, n - 1);
    }
  }

  // ---------- contiguous masks ----------

  // Every bit above a set bit is set.
  predicate Contiguous(mask: bv32) {
    (mask << 1) | mask == mask
  }

  lemma ContiguousMasksNest(m: bv32, n: bv32)
    requires Contiguous(m) && Contiguous(n)
    ensures m & n == m || m & n == n
  {}

  predicate Submask(x: bv32, y: bv32) { x & y == x }

  lemma SubmaskHalves(x: bv32, y: bv32)
    requires Submask(x, y)
    ensures Submask(x >> 1, y >> 1)
    ensures Odd(x) ==> Odd(y)
  {}

  lemma SameHalves(x: bv32, y: bv32)
    requires x >> 1 == y >> 1 && Odd(x) == Odd(y)
    ensures x == y
  {}

  // Fewer bits set in the smaller of two nested masks, or the same mask.
  lemma {:induction false} SubmaskCounts(x: bv32, y: bv32, k: nat)
    requires Submask(x, y) && Fits(x, k) && Fits(y, k)
    ensures PopBits(x, k) <= PopBits(y, k)
    ensures PopBits(x, k) == PopBits(y, k) ==> x == y
    decreases k
  {
    hide Odd, Submask;
    if k > 0 {
      SubmaskHalves(x, y);
      SubmaskCounts(x >> 1, y >> 1, k - 1);
      if PopBits(x, k) == PopBits(y, k) {
        SameHalves(x, y);
      }
    }
  }

  lemma LongerMaskContains(m: bv32, n: bv32)
    requires Contiguous(m) && Contiguous(n) && PopCount(n) <= PopCount(m)
    ensures m & n == n
  {
    hide Contiguous, Fits, PopBits;
    ContiguousMasksNest(m, n);
    WordFits(m);
    WordFits(n);
    if m & n == m {
      SubmaskCounts(m, n, 32);
      AndSelf(m);
    }
  }

  lemma AndSelf(m: bv32)
    ensures m & m == m
  {}

  lemma AndThrough(a: bv32, m: bv32, n: bv32)
    requires m & n == n
    ensures (a & m) & n == a & n
  {}

  // The chosen network lies inside every other network that matches.
  lemma BestRouteIsMostSpecific(routes: seq<Route>, address: bv32, j: nat, other: bv32)
    requires forall i | 0 <= i < |routes| :: Contiguous(routes[i].mask)
    requires j < |routes| && Matches(routes[j], address)
    ensures var b := BestRoute(routes, address, |routes|);
            b >= 0 && (Matches(routes[b], other) ==> Matches(routes[j], other))
  {
    hide Contiguous, PopCount;
    BestRouteIsLongest(routes, address, |routes|);
    var b := BestRoute(routes, address, |routes|);
    var m, n := routes[b].mask, routes[j].mask;
    LongerMaskContains(m, n);
    AndThrough(address, m, n);
    AndThrough(other, m, n);
  }

  // ---------- the ARP cache ----------

  // The scan does not stop at a hit, so the last entry for an address counts.
  function ArpLookup(cache: seq<ArpEntry>, ip: seq<byte>, n: nat): Option<seq<byte>>
    requires n <= |cache|
  {
    if n == 0 then None
    else if cache[n - 1].ip == ip then Some(cache[n - 1].mac)
    else ArpLookup(cache, ip, n - 1)
  }

  method FindMac(cache: seq<ArpEntry>, ip: seq<byte>) returns (mac: Option<seq<byte>>)
    ensures mac == ArpLookup(cache, ip, |cache|)
  {
    mac := None;
    for i := 0 to |cache|
      invariant mac == ArpLookup(cache, ip, i)
    {
      if cache[i].ip == ip {
        mac := Some(cache[i].mac);
      }
    }
  }

  // The cache knows this address by this entry, and no later one overrides it.
  ghost predicate LastEntry(cache: seq<ArpEntry>, ip: seq<byte>, k: nat) {
    && k < |cache| && cache[k].ip == ip
    && forall j | k < j < |cache| :: cache[j].ip != ip
  }

  // Nothing is found exactly when no entry has the address; otherwise its last entry is.
  lemma {:induction false} ArpLookupLast(cache: seq<ArpEntry>, ip: seq<byte>, n: nat)
    requires n <= |cache|
    ensures match ArpLookup(cache, ip, n)
            case None => forall j | 0 <= j < n :: cache[j].ip != ip
            case Some(mac) => exists k: nat :: LastEntry(cache[..n], ip, k) && cache[k].mac == mac
  {
    if n > 0 {
      ArpLookupLast(cache, ip, n - 1);
      if cache[n - 1].ip == ip {
        assert LastEntry(cache[..n], ip, n - 1);
      } else if ArpLookup(cache, ip, n).Some? {
        var k: nat :| LastEntry(cache[..n - 1], ip, k) && cache[k].mac == ArpLookup(cache, ip, n).value;
        assert LastEntry(cache[..n], ip, k);
      }
    }
  }
}
