/** The host registry the handler talks to (`TunnelManager` in the server), and the
    tunnel entries it holds.

    Whether `add` accepts a tunnel is not fixed here: the registry is built with an
    acceptance policy `accept(entries, tunnel)`, so that everything proved about the
    handler holds whatever `add` answers. `FirstWriterWins` is first-writer-wins: a host
    is taken only if nobody holds it yet; the lemmas at the end hold for that policy only. */
module TunnelRegistry {

  /** The owning control connection; only its identity matters here. */
  type ConnId = nat

  /** One registered route: the public host, the registering client, the position of
      the host in its registration message, and the connection it was registered on. */
  datatype Tunnel = Tunnel(host: string, clientName: string, index: int, ctx: ConnId)

  /** Registry contents after a sequence of `add` calls, and what each call answered. */
  datatype Batch = Batch(entries: map<string, Tunnel>, oks: seq<bool>)

  /** Entries are keyed by their own host. */
  ghost predicate KeyedByHost(entries: map<string, Tunnel>)
  {
    forall h :: h in entries ==> entries[h].host == h
  }

  /** Calling `add` on `tunnels` in order, starting from `entries`. */
  function AddAll(accept: (map<string, Tunnel>, Tunnel) -> bool,
                  entries: map<string, Tunnel>, tunnels: seq<Tunnel>): (b: Batch)
    ensures |b.oks| == |tunnels|
  {
    if tunnels == [] then Batch(entries, [])
    else
      var before := AddAll(accept, entries, tunnels[..|tunnels| - 1]);
      var t := tunnels[|tunnels| - 1];
      var ok := accept(before.entries, t);
      Batch(if ok then before.entries[t.host := t] else before.entries, before.oks + [ok])
  }

  /** First-writer-wins: a host is taken only if nobody holds it yet. */
  function FirstWriterWins(entries: map<string, Tunnel>, t: Tunnel): bool
  {
    t.host !in entries
  }

  class TunnelManager {
    var entries: map<string, Tunnel>
    const accept: (map<string, Tunnel>, Tunnel) -> bool

    ghost predicate Valid()
      reads this
    {
      KeyedByHost(entries)
    }

    constructor (accept: (map<string, Tunnel>, Tunnel) -> bool)
      ensures Valid() && entries == map[] && this.accept == accept
    {
      entries := map[];
      this.accept := accept;
    }

    /** Registers `t` under its host when the policy accepts it, and says whether it did. */
    method Add(t: Tunnel) returns (ok: bool)
      requires Valid()
      modifies this
      ensures Valid()
      ensures ok == accept(old(entries), t)
      ensures entries == if ok then old(entries)[t.host := t] else old(entries)
    {
      ok := accept(entries, t);
      if ok {
        entries := entries[t.host := t];
      }
    }

    /** Drops the entry for `host`; nothing happens when there is none. */
    method Remove(host: string)
      requires Valid()
      modifies this
      ensures Valid()
      ensures entries == old(entries) - {host}
    {
      entries := entries - {host};
    }
  }

  /** Successive `add` calls keep every entry keyed by its own host. */
  lemma {:induction false} AddAllKeyedByHost(accept: (map<string, Tunnel>, Tunnel) -> bool,
                                             entries: map<string, Tunnel>, tunnels: seq<Tunnel>)
    requires KeyedByHost(entries)
    ensures KeyedByHost(AddAll(accept, entries, tunnels).entries)
    decreases |tunnels|
  {
    if tunnels != [] {
      AddAllKeyedByHost(accept, entries, tunnels[..|tunnels| - 1]);
    }
  }

  /** Under first-writer-wins, the i-th `add` of a batch succeeds exactly when its host
      was free before the batch and no earlier tunnel of the batch asked for it. */
  lemma {:induction false} FirstWriterWinsOutcome(entries: map<string, Tunnel>, tunnels: seq<Tunnel>, i: nat)
    requires i < |tunnels|
    ensures AddAll(FirstWriterWins, entries, tunnels).oks[i]
        <==> tunnels[i].host !in entries && forall j :: 0 <= j < i ==> tunnels[j].host != tunnels[i].host
    decreases |tunnels|
  {
    var n := |tunnels| - 1;
    var prefix := tunnels[..n];
    var before := AddAll(FirstWriterWins, entries, prefix);
    if i < n {
      FirstWriterWinsOutcome(entries, prefix, i);
    } else {
      FirstWriterWinsHosts(entries, prefix);
    }
  }

  /** Under first-writer-wins, a batch ends with exactly the old hosts plus the batch's hosts. */
  lemma {:induction false} FirstWriterWinsHosts(entries: map<string, Tunnel>, tunnels: seq<Tunnel>)
    ensures AddAll(FirstWriterWins, entries, tunnels).entries.Keys
        == entries.Keys + set j | 0 <= j < |tunnels| :: tunnels[j].host
    decreases |tunnels|
  {
    if tunnels != [] {
      var n := |tunnels| - 1;
      FirstWriterWinsHosts(entries, tunnels[..n]);
      assert (set j | 0 <= j < |tunnels| :: tunnels[j].host)
          == (set j | 0 <= j < n :: tunnels[..n][j].host) + {tunnels[n].host};
    }
  }

  /** Under first-writer-wins, no entry present before a batch is replaced by it. */
  lemma {:induction false} FirstWriterWinsKeepsOwners(entries: map<string, Tunnel>, tunnels: seq<Tunnel>)
    ensures var after := AddAll(FirstWriterWins, entries, tunnels).entries;
      forall h :: h in entries ==> h in after && after[h] == entries[h]
    decreases |tunnels|
  {
    if tunnels != [] {
      FirstWriterWinsKeepsOwners(entries, tunnels[..|tunnels| - 1]);
    }
  }
}
