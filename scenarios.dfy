/** Worked instances of the request pipeline's rules. */
module Scenarios {
  import opened Wrappers
  import opened Text
  import opened World
  import opened Discovery
  import opened Locator
  import opened Capture

  /** Two configured endpoints (such as "a:2379,b:2379"), only the second
      answering /health: the second is chosen. */
  lemma SecondEndpointChosen(env: Env, first: string, second: string)
    requires ',' !in first && ',' !in second
    requires Probe(env, first).Some?
    requires Probe(env, second) == None
    ensures Chosen(env, first + "," + second) == second
  {
    var pieces := [first, second];
    assert Split(first + "," + second, ',') == pieces by {
      assert Join(pieces, ',') == first + "," + second;
      SplitJoin(pieces, ',');
    }
    FirstAnsweringAt(env, pieces, 1);
  }

  /** One offline and two online members: the lower-index online member wins. */
  lemma LowestOnlineWins()
    ensures var nodes := [Entry("/mysql/c/nodes/10.0.0.1", "OFFLINE"),
                          Entry("/mysql/c/nodes/10.0.0.2", "ONLINE"),
                          Entry("/mysql/c/nodes/10.0.0.3", "ONLINE")];
      FirstOnline(nodes) == Some(1) && Address(nodes[1]) == "10.0.0.2"
  {
    var nodes := [Entry("/mysql/c/nodes/10.0.0.1", "OFFLINE"),
                  Entry("/mysql/c/nodes/10.0.0.2", "ONLINE"),
                  Entry("/mysql/c/nodes/10.0.0.3", "ONLINE")];
    FirstOnlineAt(nodes, 1);
    assert nodes[1].key == "/mysql/c/nodes" + ['/'] + "10.0.0.2";
    AfterLastOfSuffix("/mysql/c/nodes", '/', "10.0.0.2");
  }

  /** A node query answered with anything but 200 yields no target. */
  lemma NonOkStatusMeansNoHost(env: Env, discoveryService: string, cluster: string)
    requires QueryNodes(env, Chosen(env, discoveryService), cluster).Response?
    requires QueryNodes(env, Chosen(env, discoveryService), cluster).status != 200
    ensures Located(env, discoveryService, cluster) == ""
  {
  }

  /** 1024 bytes followed by the peer closing: the file holds those 1024 bytes and
      the reported state is the end-of-stream error. */
  lemma ClosedAfterOneChunk(chunk: seq<byte>, room: nat, path: string)
    requires |chunk| == 1024 && room >= 1024
    ensures var stream := [Read(chunk, None), Read([], Some("EOF"))];
      Ends(stream) && Copied(stream, room) == chunk && CopyStatus(stream, room, path) == "EOF"
  {
    var stream := [Read(chunk, None), Read([], Some("EOF"))];
    assert stream[1].err.Some?;
    assert DeliveredFrom(stream, 1) == [];
    assert Delivered(stream) == chunk + [];
    assert EndIndex(stream) == 1;
  }
}
