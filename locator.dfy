/** findBackupTarget: asking the discovery service which cluster member is online. */
module Locator {
  import opened Wrappers
  import opened Text
  import opened World
  import opened Discovery

  /** The one error message every failure of findBackupTarget collapses into. */
  const NoHostMessage := "No Available Etcd Host."

  predicate IsOnline(e: Entry)
  {
    e.value == "ONLINE"
  }

  /** The index of the first entry whose state is exactly "ONLINE". */
  function FirstOnline(nodes: seq<Entry>): (r: Option<nat>)
    ensures r.Some? ==> r.value < |nodes| && IsOnline(nodes[r.value])
    ensures r.Some? ==> forall j :: 0 <= j < r.value ==> !IsOnline(nodes[j])
    ensures r.None? ==> forall j :: 0 <= j < |nodes| ==> !IsOnline(nodes[j])
    decreases |nodes|
  {
    if nodes == [] then None
    else if IsOnline(nodes[0]) then Some(0)
    else match FirstOnline(nodes[1..])
      case None => None
      case Some(i) => Some(i + 1)
  }

  lemma FirstOnlineAt(nodes: seq<Entry>, i: nat)
    requires i < |nodes| && IsOnline(nodes[i])
    requires forall j :: 0 <= j < i ==> !IsOnline(nodes[j])
    ensures FirstOnline(nodes) == Some(i)
  {
    // Follows from the characterisation in FirstOnline's contract.
  }

  /** Entries after the first online one never affect the choice: replacing
      everything behind it, online or not, leaves the winner in place. */
  lemma LaterEntriesIrrelevant(nodes: seq<Entry>, i: nat, rest: seq<Entry>)
    requires FirstOnline(nodes) == Some(i)
    ensures FirstOnline(nodes[..i + 1] + rest) == Some(i)
  {
    var changed := nodes[..i + 1] + rest;
    assert forall j :: 0 <= j <= i ==> changed[j] == nodes[j];
    FirstOnlineAt(changed, i);
  }

  /** The address named by a node key: what follows its last '/'. */
  function Address(e: Entry): (addr: string)
    ensures '/' !in addr
  {
    AfterLast(e.key, '/')
  }

  /** The address of the smallest-index online entry; "" when none is online. */
  function Winner(nodes: seq<Entry>): string
  {
    match FirstOnline(nodes)
    case None => ""
    case Some(i) => Address(nodes[i])
  }

  /** Looking one entry further down the list. */
  lemma WinnerFrom(nodes: seq<Entry>, i: nat)
    requires i < |nodes|
    ensures Winner(nodes[i..]) == if IsOnline(nodes[i]) then Address(nodes[i]) else Winner(nodes[i + 1..])
  {
    var rest := nodes[i..];
    assert rest[0] == nodes[i];
    assert rest[1..] == nodes[i + 1..];
    if !IsOnline(nodes[i]) {
      match FirstOnline(nodes[i + 1..])
      case None =>
        assert FirstOnline(rest) == None;
      case Some(k) =>
        assert FirstOnline(rest) == Some(k + 1);
        assert rest[k + 1] == nodes[i + 1..][k];
    }
  }

  /** The node list of a reply that was a readable 200 response holding `node.nodes`. */
  function Listed(reply: Reply): Option<seq<Entry>>
  {
    if reply.Response? && reply.status == 200 && reply.body.Document? then reply.body.nodes
    else None
  }

  /** The address findBackupTarget settles on for this request; "" when there is none. */
  function Located(env: Env, discoveryService: string, cluster: string): string
  {
    match Listed(QueryNodes(env, Chosen(env, discoveryService), cluster))
    case None => ""
    case Some(nodes) => Winner(nodes)
  }

  /** The downward scan of server.go lines 115-120: every online entry overwrites
      `target`, so the smallest-index online entry is the last one written. */
  method ScanNodes(nodes: seq<Entry>) returns (target: string)
    ensures match FirstOnline(nodes)
      case Some(i) => target == Address(nodes[i])
      case None => target == ""
  {
    target := "";
    var i := |nodes| - 1;
    while i >= 0
      invariant -1 <= i < |nodes|
      invariant target == Winner(nodes[i + 1..])
    {
      WinnerFrom(nodes, i);
      if nodes[i].value == "ONLINE" {
        target := AfterLast(nodes[i].key, '/');
      }
      i := i - 1;
    }
    assert nodes[0..] == nodes;
  }

  /** findBackupTarget: the online member's address, or NoHostMessage when the
      query failed, the status was not 200, the body was unreadable, `node.nodes`
      was absent, no entry was online, or the winning entry's address is empty. */
  method FindBackupTarget(env: Env, discoveryService: string, cluster: string)
    returns (target: string, err: Option<string>)
    ensures var listed := Listed(QueryNodes(env, Chosen(env, discoveryService), cluster));
      err.Some? <==>
        (listed.None? || FirstOnline(listed.value).None? ||
         Address(listed.value[FirstOnline(listed.value).value]) == "")
    ensures err.Some? ==> target == "" && err == Some(NoHostMessage)
    ensures target == Located(env, discoveryService, cluster)
    ensures err.None? ==>
      var nodes := Listed(QueryNodes(env, Chosen(env, discoveryService), cluster)).value;
      target != "" && target == Address(nodes[FirstOnline(nodes).value])
    ensures (forall c :: c in Split(discoveryService, ',') ==> !Answers(env, c)) ==>
      err == Some(NoHostMessage)
  {
    var etcdServer, probes;
    etcdServer, err, probes := GetEtcdServer(env, discoveryService);
    target := "";
    if err == None {
      var reply := QueryNodes(env, etcdServer, cluster);
      if reply.Failed? {
        err := Some(reply.reason);
      } else if reply.status == 200 {
        match reply.body
        case Unreadable(reason) =>
          err := Some(reason);
        case Document(nodes) =>
          if nodes.Some? {
            target := ScanNodes(nodes.value);
          }
      }
    }
    if target == "" {
      return "", Some(NoHostMessage);
    }
  }
}
