/** The registration handler of the tunnel server's control channel
    (`TunnelS2CServerHandler`): one instance per accepted connection.

    A frame `clientName<sep>h1,h2,...` registers each trimmed host with the registry and
    sorts it into a success or a failed list; the raw host list of the first message
    whose host loop ran is recorded on the connection; a fault tears the connection
    down by removing every comma token of that recorded list. */
module TunnelServer {
  import opened JavaStrings
  import opened TunnelRegistry

  /** What reading one frame did. `IndexFault` is the out-of-bounds access of
      `split[0]`/`split[1]` on a frame that splits into fewer than two parts. */
  datatype ReadResult =
    | Skipped
    | IndexFault
    | Registered(clientName: string, hostAry: string,
                 success: seq<string>, failed: seq<string>,
                 successJoined: string, failedJoined: string)

  /** What is known of `StringUtil.isNotEmpty`: false on "", true on any string holding a
      character that `trim` keeps. A length test and a trim-then-length test both qualify. */
  ghost predicate EmptinessTest(isNotEmpty: string -> bool)
  {
    !isNotEmpty("") && forall s :: HasVisible(s) ==> isNotEmpty(s)
  }

  /** The hosts of a raw host list: its comma tokens, each trimmed. */
  function Hosts(hostAry: string): seq<string>
  {
    TrimAll(JavaSplit(hostAry, ","))
  }

  /** Each token trimmed, in order. */
  function TrimAll(toks: seq<string>): seq<string>
  {
    seq(|toks|, i requires 0 <= i < |toks| => Trim(toks[i]))
  }

  /** The tunnels built for the hosts of one message, numbered by a running counter. */
  function TunnelsFor(hosts: seq<string>, clientName: string, ctx: ConnId): (ts: seq<Tunnel>)
    ensures |ts| == |hosts|
    ensures forall i :: 0 <= i < |ts| ==> ts[i] == Tunnel(hosts[i], clientName, i, ctx)
  {
    if hosts == [] then []
    else
      var n := |hosts| - 1;
      TunnelsFor(hosts[..n], clientName, ctx) + [Tunnel(hosts[n], clientName, n, ctx)]
  }

  /** The hosts whose `add` answered `want`, in message order. */
  function Select(hosts: seq<string>, oks: seq<bool>, want: bool): seq<string>
    requires |oks| == |hosts|
  {
    if hosts == [] then []
    else
      var n := |hosts| - 1;
      Select(hosts[..n], oks[..n], want) + (if oks[n] == want then [hosts[n]] else [])
  }

  /** The string the handler's join loop builds: a comma goes in front of a host only
      when the text so far is non-empty. */
  function Accumulate(hosts: seq<string>): string
  {
    if hosts == [] then ""
    else
      var acc := Accumulate(hosts[..|hosts| - 1]);
      (if acc != "" then acc + "," else acc) + hosts[|hosts| - 1]
  }

  /** The registry after tearing down a connection with the given recorded host list. */
  function Teardown(entries: map<string, Tunnel>, recorded: Option<string>): map<string, Tunnel>
  {
    match recorded
    case None => entries
    case Some(raw) => entries - set t | t in JavaSplit(raw, ",")
  }

  class TunnelS2CServerHandler {
    /** The connection this handler instance serves. */
    const ctx: ConnId
    /** The separator between client name and host list. */
    const sep: string
    const isNotEmpty: string -> bool
    /** The connection attribute holding the first recorded raw host list. */
    var recordedHosts: Option<string>
    var open: bool

    ghost predicate Valid()
    {
      |sep| > 0 && EmptinessTest(isNotEmpty)
    }

    constructor (ctx: ConnId, sep: string, isNotEmpty: string -> bool)
      requires |sep| > 0 && EmptinessTest(isNotEmpty)
      ensures Valid() && this.ctx == ctx && this.sep == sep && this.isNotEmpty == isNotEmpty
      ensures recordedHosts == None && open
    {
      this.ctx := ctx;
      this.sep := sep;
      this.isNotEmpty := isNotEmpty;
      recordedHosts := None;
      open := true;
    }

    /** The loop that turns the success (or failed) list into one string. */
    method JoinHosts(hosts: seq<string>) returns (joined: string)
      requires Valid()
      requires forall h :: h in hosts ==> Trim(h) == h
      ensures joined == Accumulate(hosts)
    {
      joined := "";
      for i := 0 to |hosts|
        invariant joined == Accumulate(hosts[..i])
        invariant joined == "" || HasVisible(joined)
      {
        assert hosts[..i + 1][..i] == hosts[..i];
        ghost var acc := joined;
        if isNotEmpty(joined) {
          joined := joined + ",";
        }
        joined := joined + hosts[i];
        if acc != "" {
          var k :| 0 <= k < |acc| && acc[k] > ' ';
          assert joined[k] == acc[k];
        } else if hosts[i] != "" {
          assert Trim(hosts[i]) == hosts[i];
          assert joined[|joined| - |hosts[i]|] == hosts[i][0];
        }
      }
      assert hosts[..|hosts|] == hosts;
    }

    /** Handles one registration frame. */
    method ChannelRead0(registry: TunnelManager, content: string) returns (r: ReadResult)
      requires Valid() && registry.Valid()
      modifies this, registry
      ensures registry.Valid() && open == old(open)
      ensures r.Skipped? <==> !(isNotEmpty(content) || Contains(content, sep))
      ensures r.IndexFault? <==> (isNotEmpty(content) || Contains(content, sep)) && |JavaSplit(content, sep)| < 2
      ensures !r.Registered? ==> recordedHosts == old(recordedHosts) && registry.entries == old(registry.entries)
      ensures r.Registered? ==>
        var parts := JavaSplit(content, sep);
        |parts| >= 2 && r.clientName == parts[0] && r.hostAry == parts[1]
      ensures r.Registered? ==>
        var hosts := Hosts(r.hostAry);
        var batch := AddAll(registry.accept, old(registry.entries), TunnelsFor(hosts, r.clientName, ctx));
        && registry.entries == batch.entries
        && r.success == Select(hosts, batch.oks, true)
        && r.failed == Select(hosts, batch.oks, false)
        && r.successJoined == Accumulate(r.success)
        && r.failedJoined == Accumulate(r.failed)
        && recordedHosts == if old(recordedHosts).None? && hosts != [] then Some(r.hostAry) else old(recordedHosts)
    {
      if !(isNotEmpty(content) || Contains(content, sep)) {
        return Skipped;
      }
      var split := JavaSplit(content, sep);
      if |split| < 2 {
        return IndexFault;
      }
      r := Register(registry, split[0], split[1]);
    }

    /** The registration part of a frame that passed the guard: splits the host list on
        commas, registers each host, and joins the two answer lists. */
    method Register(registry: TunnelManager, clientName: string, hostAry: string) returns (r: ReadResult)
      requires Valid() && registry.Valid()
      modifies this`recordedHosts, registry
      ensures registry.Valid()
      ensures r.Registered? && r.clientName == clientName && r.hostAry == hostAry
      ensures
        var hosts := Hosts(hostAry);
        var batch := AddAll(registry.accept, old(registry.entries), TunnelsFor(hosts, clientName, ctx));
        && registry.entries == batch.entries
        && r.success == Select(hosts, batch.oks, true)
        && r.failed == Select(hosts, batch.oks, false)
        && r.successJoined == Accumulate(r.success)
        && r.failedJoined == Accumulate(r.failed)
        && recordedHosts == if old(recordedHosts).None? && hosts != [] then Some(hostAry) else old(recordedHosts)
    {
      var split2 := JavaSplit(hostAry, ",");
      var successHostList, failedHostList := RegisterHosts(registry, clientName, hostAry, split2);
      assert TrimAll(split2) == Hosts(hostAry);
      ghost var batch := AddAll(registry.accept, old(registry.entries), TunnelsFor(Hosts(hostAry), clientName, ctx));
      SelectedHostsTrimmed(hostAry, batch.oks, true);
      SelectedHostsTrimmed(hostAry, batch.oks, false);
      var success := JoinHosts(successHostList);
      var failed := JoinHosts(failedHostList);
      r := Registered(clientName, hostAry, successHostList, failedHostList, success, failed);
    }

    /** The host loop of a registration message: builds a tunnel per trimmed host with a
        running index, records the raw host list if nothing is recorded yet, calls `add`
        and sorts the host by its answer. */
    method RegisterHosts(registry: TunnelManager, clientName: string, hostAry: string, split2: seq<string>)
      returns (successHostList: seq<string>, failedHostList: seq<string>)
      requires registry.Valid()
      modifies this`recordedHosts, registry
      ensures registry.Valid()
      ensures
        var hosts := TrimAll(split2);
        var batch := AddAll(registry.accept, old(registry.entries), TunnelsFor(hosts, clientName, ctx));
        && registry.entries == batch.entries
        && successHostList == Select(hosts, batch.oks, true)
        && failedHostList == Select(hosts, batch.oks, false)
        && recordedHosts == if old(recordedHosts).None? && hosts != [] then Some(hostAry) else old(recordedHosts)
    {
      ghost var m0 := registry.entries;
      ghost var r0 := recordedHosts;
      ghost var hosts := TrimAll(split2);
      ghost var tunnels := TunnelsFor(hosts, clientName, ctx);
      assert |hosts| == |tunnels| == |split2|;
      successHostList, failedHostList := [], [];
      var hostIndex := 0;
      ghost var oks: seq<bool> := [];
      for i := 0 to |split2|
        modifies this`recordedHosts, registry
        invariant hostIndex == i && |oks| == i
        invariant registry.Valid()
        invariant AddAll(registry.accept, m0, tunnels[..i]) == Batch(registry.entries, oks)
        invariant successHostList == Select(hosts[..i], oks, true)
        invariant failedHostList == Select(hosts[..i], oks, false)
        invariant recordedHosts == if r0.None? && i > 0 then Some(hostAry) else r0
      {
        var host := Trim(split2[i]);
        var tunnel := Tunnel(host, clientName, hostIndex, ctx);
        hostIndex := hostIndex + 1;
        if recordedHosts.None? {
          recordedHosts := Some(hostAry);
        }
        var ok := registry.Add(tunnel);
        if ok {
          successHostList := successHostList + [host];
        } else {
          failedHostList := failedHostList + [host];
        }
        TunnelAt(split2, clientName, ctx, i);
        RegisterStep(registry.accept, m0, hosts, tunnels, oks, ok);
        oks := oks + [ok];
      }
      WholePrefix(tunnels);
      WholePrefix(hosts);
    }

    /** The teardown path: removes every comma token of the recorded host list, as it
        was recorded (tokens are not trimmed), then closes the connection. */
    method ExceptionCaught(registry: TunnelManager) returns (ghost removed: seq<string>)
      requires registry.Valid()
      modifies this, registry
      ensures registry.Valid() && !open && recordedHosts == old(recordedHosts)
      ensures removed == match recordedHosts case None => [] case Some(raw) => JavaSplit(raw, ",")
      ensures registry.entries == Teardown(old(registry.entries), recordedHosts)
    {
      removed := [];
      if recordedHosts.Some? {
        var hosts := recordedHosts.value;
        var hostAry := JavaSplit(hosts, ",");
        for i := 0 to |hostAry|
          modifies registry
          invariant registry.Valid()
          invariant removed == hostAry[..i]
          invariant registry.entries == old(registry.entries) - set t | t in hostAry[..i]
        {
          registry.Remove(hostAry[i]);
          assert hostAry[..i + 1] == hostAry[..i] + [hostAry[i]];
          removed := removed + [hostAry[i]];
        }
        assert hostAry[..|hostAry|] == hostAry;
      }
      open := false;
    }

    /** A decoded frame handed to the handler: a fault raised while reading it is routed
        to the same handler's teardown path; every other outcome is that of `ChannelRead0`. */
    method OnFrame(registry: TunnelManager, content: string) returns (r: ReadResult)
      requires Valid() && registry.Valid()
      modifies this, registry
      ensures registry.Valid()
      ensures r.Skipped? <==> !(isNotEmpty(content) || Contains(content, sep))
      ensures r.IndexFault? <==> (isNotEmpty(content) || Contains(content, sep)) && |JavaSplit(content, sep)| < 2
      ensures r.IndexFault? ==>
        && !open && recordedHosts == old(recordedHosts)
        && registry.entries == Teardown(old(registry.entries), old(recordedHosts))
      ensures r.Skipped? ==> open == old(open) && recordedHosts == old(recordedHosts) && registry.entries == old(registry.entries)
      ensures r.Registered? ==>
        var parts := JavaSplit(content, sep);
        |parts| >= 2 && r.clientName == parts[0] && r.hostAry == parts[1]
      ensures r.Registered? ==>
        var hosts := Hosts(r.hostAry);
        var batch := AddAll(registry.accept, old(registry.entries), TunnelsFor(hosts, r.clientName, ctx));
        && open == old(open)
        && registry.entries == batch.entries
        && r.success == Select(hosts, batch.oks, true)
        && r.failed == Select(hosts, batch.oks, false)
        && r.successJoined == Accumulate(r.success)
        && r.failedJoined == Accumulate(r.failed)
        && recordedHosts == if old(recordedHosts).None? && hosts != [] then Some(r.hostAry) else old(recordedHosts)
    {
      r := ChannelRead0(registry, content);
      if r.IndexFault? {
        var _ := ExceptionCaught(registry);
      }
    }
  }

  /** A token without a comma trims to a string that is already trimmed and holds no comma. */
  lemma CleanToken(t: string)
    requires Find(t, ",").None?
    ensures Trim(Trim(t)) == Trim(t) && ',' !in Trim(t)
  {
    TrimIdempotent(t);
    FoundCharIsIn(t, ',');
  }

  /** Every host of a message is already trimmed and holds no comma. */
  lemma HostsAreClean(hostAry: string)
    ensures forall h :: h in Hosts(hostAry) ==> Trim(h) == h && ',' !in h
  {
    var toks := JavaSplit(hostAry, ",");
    var hosts := Hosts(hostAry);
    JavaSplitPieces(hostAry, ",");
    forall i | 0 <= i < |hosts| ensures Trim(hosts[i]) == hosts[i] && ',' !in hosts[i] {
      assert toks[i] in toks;
      CleanToken(toks[i]);
    }
  }

  /** The i-th tunnel of a message carries the i-th comma token, trimmed. */
  lemma TunnelAt(toks: seq<string>, clientName: string, ctx: ConnId, i: nat)
    requires i < |toks|
    ensures i < |TrimAll(toks)| && TrimAll(toks)[i] == Trim(toks[i])
    ensures TunnelsFor(TrimAll(toks), clientName, ctx)[i] == Tunnel(TrimAll(toks)[i], clientName, i, ctx)
  {
  }

  /** One turn of the host loop, on values: the registry and the two lists after the
      i-th `add` are those of the first i + 1 tunnels. */
  lemma RegisterStep(accept: (map<string, Tunnel>, Tunnel) -> bool, entries: map<string, Tunnel>,
                     hosts: seq<string>, tunnels: seq<Tunnel>, oks: seq<bool>, ok: bool)
    requires |oks| < |hosts| == |tunnels|
    requires ok == accept(AddAll(accept, entries, tunnels[..|oks|]).entries, tunnels[|oks|])
    ensures var i := |oks|;
      var before := AddAll(accept, entries, tunnels[..i]);
      var t := tunnels[i];
      && AddAll(accept, entries, tunnels[..i + 1])
           == Batch(if ok then before.entries[t.host := t] else before.entries, before.oks + [ok])
      && Select(hosts[..i + 1], oks + [ok], true)
           == Select(hosts[..i], oks, true) + (if ok then [hosts[i]] else [])
      && Select(hosts[..i + 1], oks + [ok], false)
           == Select(hosts[..i], oks, false) + (if ok then [] else [hosts[i]])
  {
    AddAllStep(accept, entries, tunnels, |oks|);
    SelectStep(hosts, oks, ok, true);
    SelectStep(hosts, oks, ok, false);
  }

  /** One more `add` call of a message, spelled out. */
  lemma AddAllStep(accept: (map<string, Tunnel>, Tunnel) -> bool, entries: map<string, Tunnel>,
                   tunnels: seq<Tunnel>, i: nat)
    requires i < |tunnels|
    ensures var before := AddAll(accept, entries, tunnels[..i]);
      var t := tunnels[i];
      var ok := accept(before.entries, t);
      AddAll(accept, entries, tunnels[..i + 1])
        == Batch(if ok then before.entries[t.host := t] else before.entries, before.oks + [ok])
  {
    assert tunnels[..i + 1][..i] == tunnels[..i];
  }

  /** One more host sorted into the lists, spelled out. */
  lemma SelectStep(hosts: seq<string>, oks: seq<bool>, ok: bool, want: bool)
    requires |oks| < |hosts|
    ensures var i := |oks|;
      Select(hosts[..i + 1], oks + [ok], want)
        == Select(hosts[..i], oks, want) + (if ok == want then [hosts[i]] else [])
  {
    var i := |oks|;
    assert hosts[..i + 1][..i] == hosts[..i];
    assert (oks + [ok])[..i] == oks;
  }

  lemma WholePrefix<T>(s: seq<T>)
    ensures s[..|s|] == s
  {
  }

  /** Both lists hold only trimmed hosts. */
  lemma SelectedHostsTrimmed(hostAry: string, oks: seq<bool>, want: bool)
    requires |oks| == |Hosts(hostAry)|
    ensures forall h :: h in Select(Hosts(hostAry), oks, want) ==> Trim(h) == h
  {
    HostsAreClean(hostAry);
    SelectFromHosts(Hosts(hostAry), oks, want);
  }

  /** Both lists hold only hosts of the message. */
  lemma {:induction false} SelectFromHosts(hosts: seq<string>, oks: seq<bool>, want: bool)
    requires |oks| == |hosts|
    ensures forall h :: h in Select(hosts, oks, want) ==> h in hosts
    decreases |hosts|
  {
    if hosts != [] {
      var n := |hosts| - 1;
      SelectFromHosts(hosts[..n], oks[..n], want);
      assert forall h :: h in hosts[..n] ==> h in hosts;
    }
  }

  /** Every host lands in exactly one of the two lists: together they hold each host
      once, and their lengths add up to the number of hosts. */
  lemma {:induction false} PartitionIsExact(hosts: seq<string>, oks: seq<bool>)
    requires |oks| == |hosts|
    ensures multiset(Select(hosts, oks, true)) + multiset(Select(hosts, oks, false)) == multiset(hosts)
    ensures |Select(hosts, oks, true)| + |Select(hosts, oks, false)| == |hosts|
    decreases |hosts|
  {
    if hosts != [] {
      var n := |hosts| - 1;
      PartitionIsExact(hosts[..n], oks[..n]);
      PartitionStep(hosts, oks);
    }
  }

  /** The last host of a message lands in exactly one of the two lists. */
  lemma PartitionStep(hosts: seq<string>, oks: seq<bool>)
    requires |oks| == |hosts| > 0
    ensures var n := |hosts| - 1;
      && multiset(hosts) == multiset(hosts[..n]) + multiset{hosts[n]}
      && multiset(Select(hosts, oks, true)) + multiset(Select(hosts, oks, false))
         == multiset(Select(hosts[..n], oks[..n], true)) + multiset(Select(hosts[..n], oks[..n], false))
            + multiset{hosts[n]}
      && |Select(hosts, oks, true)| + |Select(hosts, oks, false)|
         == |Select(hosts[..n], oks[..n], true)| + |Select(hosts[..n], oks[..n], false)| + 1
  {
    var n := |hosts| - 1;
    var h := hosts[n];
    assert hosts == hosts[..n] + [h];
    var yes, no := Select(hosts[..n], oks[..n], true), Select(hosts[..n], oks[..n], false);
    if oks[n] {
      assert Select(hosts, oks, true) == yes + [h];
      assert Select(hosts, oks, false) == no;
    } else {
      assert Select(hosts, oks, true) == yes;
      assert Select(hosts, oks, false) == no + [h];
    }
  }

  /** Host i goes to the list that matches the answer of its own `add`. */
  lemma {:induction false} PartitionPlacesEachHost(hosts: seq<string>, oks: seq<bool>, i: nat)
    requires |oks| == |hosts| && i < |hosts|
    ensures hosts[i] in Select(hosts, oks, oks[i])
    decreases |hosts|
  {
    var n := |hosts| - 1;
    if i < n {
      PartitionPlacesEachHost(hosts[..n], oks[..n], i);
    }
  }

  /** When every `add` succeeds the success list is the host list, in order, and the
      failed list is empty; when every `add` fails it is the other way round. */
  lemma {:induction false} UniformOutcome(hosts: seq<string>, oks: seq<bool>, want: bool)
    requires |oks| == |hosts|
    requires forall i :: 0 <= i < |oks| ==> oks[i] == want
    ensures Select(hosts, oks, want) == hosts
    ensures Select(hosts, oks, !want) == []
    decreases |hosts|
  {
    if hosts != [] {
      var n := |hosts| - 1;
      UniformOutcome(hosts[..n], oks[..n], want);
      assert hosts == hosts[..n] + [hosts[n]];
    }
  }

  /** Joining one more piece onto a non-empty join. */
  lemma {:induction false} JoinSnoc(parts: seq<string>, x: string, sep: string)
    requires |parts| > 0
    ensures JoinWith(parts + [x], sep) == JoinWith(parts, sep) + sep + x
    decreases |parts|
  {
    if |parts| > 1 {
      JoinSnoc(parts[1..], x, sep);
      assert (parts + [x])[1..] == parts[1..] + [x];
    }
  }

  /** The join loop yields "" for no hosts, and the comma join of the hosts when none
      of them is empty. */
  lemma {:induction false} AccumulateIsJoin(hosts: seq<string>)
    requires forall h :: h in hosts ==> h != ""
    ensures Accumulate(hosts) == JoinWith(hosts, ",")
    ensures hosts == [] <==> Accumulate(hosts) == ""
    decreases |hosts|
  {
    if hosts != [] {
      var n := |hosts| - 1;
      assert forall h :: h in hosts[..n] ==> h in hosts;
      AccumulateIsJoin(hosts[..n]);
      assert hosts[n] in hosts;
      if n > 0 {
        JoinSnoc(hosts[..n], hosts[n], ",");
        assert hosts[..n] + [hosts[n]] == hosts;
      }
    }
  }

  /** A success (or failed) string splits back into its list: the joined text is an
      exact encoding of a non-empty list of non-empty hosts of one message. */
  lemma JoinedListSplitsBack(hostAry: string, list: seq<string>)
    requires forall h :: h in list ==> h in Hosts(hostAry) && h != ""
    requires list != []
    ensures JavaSplit(Accumulate(list), ",") == list
  {
    HostsAreClean(hostAry);
    AccumulateIsJoin(list);
    assert list[|list| - 1] in list;
    JavaSplitJoin(list, ',');
  }

  /** Teardown releases every host of the recorded message when its comma tokens carry
      no surrounding blanks. */
  lemma TeardownReleasesRecordedHosts(entries: map<string, Tunnel>, raw: string)
    requires forall t :: t in JavaSplit(raw, ",") ==> Trim(t) == t
    ensures forall h :: h in Hosts(raw) ==> h !in Teardown(entries, Some(raw))
  {
    var toks := JavaSplit(raw, ",");
    TrimmedTokensKept(toks);
    assert Hosts(raw) == TrimAll(toks);
    assert Teardown(entries, Some(raw)) == entries - set t | t in toks;
  }

  lemma TrimmedTokensKept(toks: seq<string>)
    requires forall t :: t in toks ==> Trim(t) == t
    ensures forall h :: h in TrimAll(toks) ==> h in toks
  {
    forall h | h in TrimAll(toks) ensures h in toks {
      var i :| 0 <= i < |toks| && TrimAll(toks)[i] == h;
      assert toks[i] == h;
    }
  }

  /** With a blank after the comma, "a, b" registers host "b" but teardown removes
      " b", so the tunnel for "b" survives the connection. */
  lemma PaddedHostSurvivesTeardown(entries: map<string, Tunnel>)
    requires "b" in entries
    ensures "b" in Hosts("a, b")
    ensures "b" in Teardown(entries, Some("a, b"))
  {
    SplitPadded();
    TrimPadded();
    assert Hosts("a, b")[1] == "b";
  }

  lemma SplitPadded()
    ensures JavaSplit("a, b", ",") == ["a", " b"]
  {
    var parts := ["a", " b"];
    assert JoinWith(parts, [',']) == "a, b" by {
      assert parts[1..] == [" b"];
    }
    JavaSplitJoin(parts, ',');
  }

  lemma TrimPadded()
    ensures Trim(" b") == "b"
  {
    assert TrimStart(" b") == 1;
    assert TrimEnd(" b", 1) == 2;
  }

  /** A message listing "a,b,a" against a registry holding neither host, under
      first-writer-wins: both hosts register, and the repeated "a" is reported failed
      because the same message has just taken it. */
  lemma RepeatedHostInOneMessage(entries: map<string, Tunnel>, clientName: string, ctx: ConnId)
    requires "a" !in entries && "b" !in entries
    ensures var hosts := ["a", "b", "a"];
      var batch := AddAll(FirstWriterWins, entries, TunnelsFor(hosts, clientName, ctx));
      && Select(hosts, batch.oks, true) == ["a", "b"]
      && Select(hosts, batch.oks, false) == ["a"]
  {
    var hosts := ["a", "b", "a"];
    RepeatedHostOutcomes(entries, clientName, ctx);
    SelectRepeated();
  }

  lemma RepeatedHostOutcomes(entries: map<string, Tunnel>, clientName: string, ctx: ConnId)
    requires "a" !in entries && "b" !in entries
    ensures AddAll(FirstWriterWins, entries, TunnelsFor(["a", "b", "a"], clientName, ctx)).oks
         == [true, true, false]
  {
    var tunnels := TunnelsFor(["a", "b", "a"], clientName, ctx);
    FirstWriterWinsOutcome(entries, tunnels, 0);
    FirstWriterWinsOutcome(entries, tunnels, 1);
    FirstWriterWinsOutcome(entries, tunnels, 2);
  }

  lemma SelectRepeated()
    ensures Select(["a", "b", "a"], [true, true, false], true) == ["a", "b"]
    ensures Select(["a", "b", "a"], [true, true, false], false) == ["a"]
  {
    var hosts, oks := ["a", "b", "a"], [true, true, false];
    assert hosts[..2] == ["a", "b"] && oks[..2] == [true, true];
    assert hosts[..2][..1] == ["a"] && oks[..2][..1] == [true];
    assert Select(["a"], [true], true) == ["a"];
    assert Select(["a"], [true], false) == [];
  }

  /** An empty frame fails both halves of the guard, so it is skipped. */
  lemma EmptyFrameSkipped(isNotEmpty: string -> bool, sep: string)
    requires |sep| > 0 && EmptinessTest(isNotEmpty)
    ensures !(isNotEmpty("") || Contains("", sep))
  {
  }

  /** The guard is a disjunction: a frame with visible text but no separator passes it,
      splits into one part only, and so faults on `split[1]`. */
  lemma UnseparatedFrameFaults(isNotEmpty: string -> bool, sep: string, content: string)
    requires |sep| > 0 && EmptinessTest(isNotEmpty)
    requires HasVisible(content) && !Contains(content, sep)
    ensures isNotEmpty(content) || Contains(content, sep)
    ensures JavaSplit(content, sep) == [content]
  {
  }
}
